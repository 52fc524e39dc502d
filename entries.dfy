/**
  Harvest time entries and what a day's worth of them becomes: the grouping
  of a user's entries by project and date, and the rounded allocation in
  seconds that the destination stores.
 */
module Entries {

  import opened Dates

  /** A logged time entry. Hours are whole hundredths of an hour. */
  datatype Entry = Entry(projectId: int, spentAt: Day, hours: int)

  /** Seconds in an hour, and the most a day's allocation may hold. */
  const SecondsPerHour := 3600
  const MaxDaySeconds := 24 * SecondsPerHour

  /** The rounding fraction the source passes: allocations snap to half-hours. */
  const HalfHour := 2

  /** Sum of the hours of the entries (hundredths of an hour). */
  function TotalHours(entries: seq<Entry>): int
  {
    if entries == [] then 0
    else TotalHours(entries[..|entries| - 1]) + entries[|entries| - 1].hours
  }

  /**
    PHP's round(hours * fraction): the number of 1/fraction-hour units
    nearest to `hours` (given in hundredths), halves rounded away from zero.
   */
  function RoundToNearestFraction(hours: int, fraction: int): (units: int)
    requires fraction > 0
    ensures 200 * units - 100 <= 2 * (hours * fraction) <= 200 * units + 100
    ensures 2 * (hours * fraction) == 200 * units - 100 ==> hours * fraction > 0
    ensures 2 * (hours * fraction) == 200 * units + 100 ==> hours * fraction < 0
  {
    var x := hours * fraction;
    if x >= 0 then (x + 50) / 100 else -((-x + 50) / 100)
  }

  /** PHP's (int) cast of a quotient: division truncating toward zero. */
  function TruncDiv(x: int, d: int): (q: int)
    requires d > 0
    ensures x >= 0 ==> 0 <= x - q * d < d
    ensures x < 0 ==> -d < x - q * d <= 0
  {
    if x >= 0 then x / d else -((-x) / d)
  }

  /**
    The allocation in seconds for one day's entries: 0 for no entries,
    otherwise the total rounded to the nearest 1/fraction hour, never less
    than one such unit when it rounds to zero.
   */
  function Allocation(entries: seq<Entry>, fraction: int): int
    requires fraction > 0
  {
    if entries == [] then 0
    else
      var rounded := RoundToNearestFraction(TotalHours(entries), fraction);
      var units := if rounded == 0 then 1 else rounded;
      TruncDiv(units * SecondsPerHour, fraction)
  }

  /** The source's test that a day's allocation lies within [0, 24] hours. */
  predicate ValidAllocation(seconds: int)
  {
    0 <= seconds <= MaxDaySeconds
  }

  /** The summing loop of calculateAllocationFromEntries, then the rounding. */
  method CalculateAllocationFromEntries(entries: seq<Entry>, fraction: int) returns (allocation: int)
    requires fraction > 0
    ensures allocation == Allocation(entries, fraction)
  {
    if entries == [] {
      return 0;
    }
    var totalHours := 0;
    var i := 0;
    while i < |entries|
      invariant 0 <= i <= |entries|
      invariant totalHours == TotalHours(entries[..i])
    {
      assert entries[..i + 1][..i] == entries[..i];
      totalHours := totalHours + entries[i].hours;
      i := i + 1;
    }
    assert entries[..i] == entries;
    var roundedHours := RoundToNearestFraction(totalHours, fraction);
    if roundedHours == 0 {
      roundedHours := 1;
    }
    allocation := TruncDiv(roundedHours * SecondsPerHour, fraction);
  }

  /** An empty day allocates nothing. */
  lemma EmptyDayAllocatesNothing(fraction: int)
    requires fraction > 0
    ensures Allocation([], fraction) == 0
  {
  }

  /**
    With half-hour rounding, a non-empty day's allocation is a positive
    multiple of 1800 s: 1800 s when the total rounds to zero, and otherwise
    the half-hour nearest the total (within a quarter hour, 900 s; one
    hundredth of an hour is 36 s).
   */
  lemma {:induction false} AllocationIsNearestHalfHour(entries: seq<Entry>)
    requires entries != []
    ensures var t, r := TotalHours(entries), Allocation(entries, HalfHour);
      && r % 1800 == 0
      && r != 0
      && (-25 < t < 25 ==> r == 1800)
      && (t <= -25 || 25 <= t ==> -900 <= r - 36 * t <= 900)
  {
    var t := TotalHours(entries);
    var n := RoundToNearestFraction(t, HalfHour);
    var units := if n == 0 then 1 else n;
    assert Allocation(entries, HalfHour) == units * 1800;
    if -25 < t < 25 {
      assert n == 0;
    } else {
      assert n != 0;
    }
  }

  /**
    A non-empty day is accepted exactly when its total is above -0.25 h and
    below 24.25 h: 24.25 h rounds to 24.5 h, over the 24-hour limit, and a
    negative total rounds to a negative allocation.
   */
  lemma {:induction false} AllocationValidIff(entries: seq<Entry>)
    requires entries != []
    ensures ValidAllocation(Allocation(entries, HalfHour)) <==> -25 < TotalHours(entries) < 2425
  {
    var t := TotalHours(entries);
    var n := RoundToNearestFraction(t, HalfHour);
    var units := if n == 0 then 1 else n;
    assert Allocation(entries, HalfHour) == units * 1800;
    if t >= 2425 {
      assert n >= 49;
    } else if t <= -25 {
      assert n <= -1;
    } else {
      assert -1 < n < 49;
    }
  }

  // ----- grouping by project and date -----

  /** One project's entries, keyed by the date they were spent on. */
  datatype ProjectEntries = ProjectEntries(projectId: int, byDate: map<Day, seq<Entry>>)

  /** The project ids of the groups, in order. */
  function ProjectsOf(groups: seq<ProjectEntries>): seq<int>
  {
    if groups == [] then [] else [groups[0].projectId] + ProjectsOf(groups[1..])
  }

  /** The entries of one project on one date, in input order (the reference definition). */
  function EntriesOn(entries: seq<Entry>, projectId: int, date: Day): seq<Entry>
  {
    if entries == [] then []
    else
      var e := entries[|entries| - 1];
      EntriesOn(entries[..|entries| - 1], projectId, date)
        + (if e.projectId == projectId && e.spentAt == date then [e] else [])
  }

  /** The project ids of the entries, each once, in order of first appearance. */
  function FirstSeenProjects(entries: seq<Entry>): seq<int>
  {
    if entries == [] then []
    else
      var seen := FirstSeenProjects(entries[..|entries| - 1]);
      var p := entries[|entries| - 1].projectId;
      if p in seen then seen else seen + [p]
  }

  /** The date map of project `p` among the groups, empty when it has no group. */
  function GroupOf(groups: seq<ProjectEntries>, p: int): map<Day, seq<Entry>>
  {
    if groups == [] then map[]
    else if groups[0].projectId == p then groups[0].byDate
    else GroupOf(groups[1..], p)
  }

  function AppendToDate(byDate: map<Day, seq<Entry>>, e: Entry): map<Day, seq<Entry>>
  {
    byDate[e.spentAt := (if e.spentAt in byDate then byDate[e.spentAt] else []) + [e]]
  }

  /** One step of the grouping loop: append `e` under its project and date. */
  function AddToGroups(groups: seq<ProjectEntries>, e: Entry): seq<ProjectEntries>
  {
    if groups == [] then [ProjectEntries(e.projectId, map[e.spentAt := [e]])]
    else if groups[0].projectId == e.projectId then
      [groups[0].(byDate := AppendToDate(groups[0].byDate, e))] + groups[1..]
    else [groups[0]] + AddToGroups(groups[1..], e)
  }

  /**
    Appending an entry adds its project at the end when it had no group,
    appends the entry under its date in its project's group, leaves every
    other group alone, and keeps the groups non-empty.
   */
  lemma {:induction false} AddToGroupsSpec(groups: seq<ProjectEntries>, e: Entry)
    ensures ProjectsOf(AddToGroups(groups, e)) == (if e.projectId in ProjectsOf(groups) then ProjectsOf(groups)
                                                   else ProjectsOf(groups) + [e.projectId])
    ensures forall p :: GroupOf(AddToGroups(groups, e), p) ==
              if p == e.projectId then AppendToDate(GroupOf(groups, p), e) else GroupOf(groups, p)
    ensures (forall g :: g in groups ==> g.byDate != map[]) ==> forall g :: g in AddToGroups(groups, e) ==> g.byDate != map[]
  {
    var r := AddToGroups(groups, e);
    if groups == [] {
      assert r[1..] == [] && [] + [e] == [e];
      assert e.spentAt in r[0].byDate;
    } else if groups[0].projectId == e.projectId {
      assert r[1..] == groups[1..];
      assert e.spentAt in r[0].byDate;
    } else {
      AddToGroupsSpec(groups[1..], e);
      assert r[1..] == AddToGroups(groups[1..], e);
    }
  }

  /** groupEntriesByProjectAndDate: the entries grouped by project and then by date. */
  function GroupEntriesByProjectAndDate(entries: seq<Entry>): (groups: seq<ProjectEntries>)
    ensures forall g :: g in groups ==> g.byDate != map[]
  {
    if entries == [] then []
    else
      var g := GroupEntriesByProjectAndDate(entries[..|entries| - 1]);
      AddToGroupsSpec(g, entries[|entries| - 1]);
      AddToGroups(g, entries[|entries| - 1])
  }

  /**
    The projects of the groups are those of the entries, each once, in order
    of first appearance; a project's group holds a date exactly when the
    project has entries on it, and then holds exactly those entries, in
    input order.
   */
  lemma {:induction false} GroupedByProjectAndDate(entries: seq<Entry>)
    ensures var groups := GroupEntriesByProjectAndDate(entries);
      && ProjectsOf(groups) == FirstSeenProjects(entries)
      && (forall p, d :: d in GroupOf(groups, p) ==> GroupOf(groups, p)[d] == EntriesOn(entries, p, d) != [])
      && (forall p, d :: EntriesOn(entries, p, d) != [] ==> d in GroupOf(groups, p))
  {
    if entries != [] {
      var prefix := entries[..|entries| - 1];
      GroupedByProjectAndDate(prefix);
      GroupStep(entries, GroupEntriesByProjectAndDate(prefix));
    }
  }

  /** One turn of the grouping loop keeps the groups a grouping of the entries seen so far. */
  lemma GroupStep(entries: seq<Entry>, g: seq<ProjectEntries>)
    requires entries != []
    requires var prefix := entries[..|entries| - 1];
      && ProjectsOf(g) == FirstSeenProjects(prefix)
      && (forall p, d :: d in GroupOf(g, p) ==> GroupOf(g, p)[d] == EntriesOn(prefix, p, d) != [])
      && (forall p, d :: EntriesOn(prefix, p, d) != [] ==> d in GroupOf(g, p))
    ensures var r := AddToGroups(g, entries[|entries| - 1]);
      && ProjectsOf(r) == FirstSeenProjects(entries)
      && (forall p, d :: d in GroupOf(r, p) ==> GroupOf(r, p)[d] == EntriesOn(entries, p, d) != [])
      && (forall p, d :: EntriesOn(entries, p, d) != [] ==> d in GroupOf(r, p))
  {
    var prefix := entries[..|entries| - 1];
    var e := entries[|entries| - 1];
    var r := AddToGroups(g, e);
    AddToGroupsSpec(g, e);
    assert entries == prefix + [e];
    forall p, d ensures EntriesOn(entries, p, d) == EntriesOn(prefix, p, d) + (if e.projectId == p && e.spentAt == d then [e] else []) {
    }
    forall p, d | d in GroupOf(r, p) ensures GroupOf(r, p)[d] == EntriesOn(entries, p, d) != [] {
      if p == e.projectId {
        var before := GroupOf(g, p);
        assert GroupOf(r, p) == before[e.spentAt := (if e.spentAt in before then before[e.spentAt] else []) + [e]];
        if d == e.spentAt {
          if d !in before {
            assert EntriesOn(prefix, p, d) == [];
          }
        } else {
          assert d in before;
        }
      } else {
        assert GroupOf(r, p) == GroupOf(g, p);
      }
    }
    forall p, d | EntriesOn(entries, p, d) != [] ensures d in GroupOf(r, p) {
      if p == e.projectId {
        var before := GroupOf(g, p);
        assert GroupOf(r, p) == before[e.spentAt := (if e.spentAt in before then before[e.spentAt] else []) + [e]];
        if d != e.spentAt {
          assert EntriesOn(prefix, p, d) != [];
        }
      } else {
        assert GroupOf(r, p) == GroupOf(g, p);
        assert EntriesOn(prefix, p, d) != [];
      }
    }
  }
}
