/**
  Forecast assignments (date intervals of constant daily allocation) and the
  value-level operations on them: the per-person ordered list the local
  index keeps, lookup of the assignment covering a day, grouping fetched
  assignments by person, and where a split moves an assignment's bounds.
 */
module Assignments {

  import opened Wrappers
  import opened Dates

  /** A destination allocation over the closed interval [startDate, endDate], in seconds per day. */
  datatype Assignment = Assignment(
    id: int,
    personId: int,
    projectId: int,
    startDate: Day,
    endDate: Day,
    allocation: int)

  /** The assignment belongs to the project and its closed interval contains the date. */
  predicate CoversDay(a: Assignment, projectId: int, date: Day)
  {
    a.projectId == projectId && a.startDate <= date <= a.endDate
  }

  /** isSingleDayAssignment */
  predicate IsSingleDayAssignment(a: Assignment)
  {
    a.startDate == a.endDate
  }

  /** shouldExtendPrevAssignment: there is a previous assignment and it has this allocation. */
  predicate ShouldExtendPrevAssignment(prev: Option<Assignment>, allocation: int)
  {
    prev.Some? && prev.value.allocation == allocation
  }

  // ----- one person's assignments: an ordered map from id to assignment -----

  /** The list has at most one assignment per id, as a PHP array has one value per key. */
  ghost predicate UniqueIds(s: seq<Assignment>)
  {
    forall i, j :: 0 <= i < j < |s| ==> s[i].id != s[j].id
  }

  /** array_key_exists($id, ...) */
  function HasId(s: seq<Assignment>, id: int): (r: bool)
    ensures r <==> exists a :: a in s && a.id == id
  {
    if s == [] then false else s[0].id == id || HasId(s[1..], id)
  }

  /**
    `$list[$a['id']] = $a`: an assignment already present under the id is
    overwritten in its place; otherwise the assignment is appended.
   */
  function Upsert(s: seq<Assignment>, a: Assignment): seq<Assignment>
  {
    if HasId(s, a.id) then seq(|s|, i requires 0 <= i < |s| => if s[i].id == a.id then a else s[i])
    else s + [a]
  }

  /**
    What Upsert keeps: the other ids' assignments in their places, the new
    assignment in the old one's place or at the end, and, when the list
    had one assignment per id, still one per id.
   */
  lemma UpsertContents(s: seq<Assignment>, a: Assignment)
    ensures HasId(s, a.id) ==> |Upsert(s, a)| == |s|
    ensures HasId(s, a.id) ==>
              forall i :: 0 <= i < |s| ==> Upsert(s, a)[i] == if s[i].id == a.id then a else s[i]
    ensures !HasId(s, a.id) ==> Upsert(s, a) == s + [a]
    ensures a in Upsert(s, a)
    ensures forall x :: x in Upsert(s, a) ==> x == a || (x in s && x.id != a.id)
    ensures forall x :: x in s && x.id != a.id ==> x in Upsert(s, a)
    ensures UniqueIds(s) ==> UniqueIds(Upsert(s, a))
  {
    var r := Upsert(s, a);
    if HasId(s, a.id) {
      var k :| 0 <= k < |s| && s[k].id == a.id;
      assert r[k] == a;
      forall x | x in r ensures x == a || (x in s && x.id != a.id) {
        var i :| 0 <= i < |r| && r[i] == x;
        if s[i].id != a.id { assert x == s[i]; }
      }
      forall x | x in s && x.id != a.id ensures x in r {
        var i :| 0 <= i < |s| && s[i] == x;
        assert r[i] == x;
      }
      if UniqueIds(s) {
        forall i, j | 0 <= i < j < |r| ensures r[i].id != r[j].id {
          assert r[i].id == s[i].id && r[j].id == s[j].id;
        }
      }
    } else {
      if UniqueIds(s) {
        forall i, j | 0 <= i < j < |r| ensures r[i].id != r[j].id {
          if j == |s| { assert r[j] == a && r[i] == s[i] && r[i] in s; }
        }
      }
    }
  }

  /** `unset($list[$id])`: every other assignment stays, in its order. */
  function Unset(s: seq<Assignment>, id: int): (r: seq<Assignment>)
    ensures forall x :: x in r <==> x in s && x.id != id
    ensures !HasId(s, id) ==> r == s
    ensures |r| <= |s|
    ensures UniqueIds(s) ==> UniqueIds(r)
  {
    if s == [] then []
    else if s[0].id == id then Unset(s[1..], id)
    else
      var rest := Unset(s[1..], id);
      assert ([s[0]] + rest)[1..] == rest;
      [s[0]] + rest
  }

  /**
    The loop of findAssignmentOnDate over one person's assignments: the
    first assignment of the project whose interval contains the date.
   */
  function FindOnDate(s: seq<Assignment>, projectId: int, date: Day): (r: Option<Assignment>)
    ensures r.Some? ==> CoversDay(r.value, projectId, date)
    ensures r.Some? ==> exists i :: 0 <= i < |s| && s[i] == r.value
                          && forall j :: 0 <= j < i ==> !CoversDay(s[j], projectId, date)
    ensures r.None? ==> forall x :: x in s ==> !CoversDay(x, projectId, date)
  {
    if s == [] then None
    else if CoversDay(s[0], projectId, date) then Some(s[0])
    else
      var r := FindOnDate(s[1..], projectId, date);
      assert r.Some? ==> exists i :: 0 <= i < |s| && s[i] == r.value
                          && forall j :: 0 <= j < i ==> !CoversDay(s[j], projectId, date) by {
        if r.Some? {
          var i :| 0 <= i < |s[1..]| && s[1..][i] == r.value
                   && forall j :: 0 <= j < i ==> !CoversDay(s[1..][j], projectId, date);
          assert s[i + 1] == r.value;
          assert forall j :: 0 <= j < i + 1 ==> !CoversDay(s[j], projectId, date) by {
            forall j | 0 <= j < i + 1 ensures !CoversDay(s[j], projectId, date) {
              if j > 0 { assert s[j] == s[1..][j - 1]; }
            }
          }
        }
      }
      r
  }

  /**
    Unsetting an id keeps the other assignments in their order, so the
    first assignment found on a date stays the first one found, unless it
    had that id.
   */
  lemma {:induction false} UnsetKeepsFirstMatch(s: seq<Assignment>, id: int, projectId: int, date: Day)
    requires FindOnDate(s, projectId, date).None? || FindOnDate(s, projectId, date).value.id != id
    ensures FindOnDate(Unset(s, id), projectId, date) == FindOnDate(s, projectId, date)
  {
    if s != [] {
      var rest := Unset(s[1..], id);
      if s[0].id == id {
        UnsetKeepsFirstMatch(s[1..], id, projectId, date);
      } else {
        var r := [s[0]] + rest;
        assert r[0] == s[0] && r[1..] == rest;
        if !CoversDay(s[0], projectId, date) {
          UnsetKeepsFirstMatch(s[1..], id, projectId, date);
        }
      }
    }
  }

  // ----- the index: person id -> that person's assignments -----

  type Index = map<int, seq<Assignment>>

  /** A person's assignments, none when the person has no entry. */
  function Lookup(index: Index, personId: int): seq<Assignment>
  {
    if personId in index then index[personId] else []
  }

  /** Assignments that share an id are the same record. */
  ghost predicate Consistent(s: seq<Assignment>)
  {
    forall i, j :: 0 <= i < |s| && 0 <= j < |s| && s[i].id == s[j].id ==> s[i] == s[j]
  }

  /** Every list of the index has unique ids and holds only assignments of `s` filed under their own person. */
  ghost predicate IndexSound(s: seq<Assignment>, index: Index)
  {
    && (forall p :: p in index ==> UniqueIds(index[p]))
    && (forall p, x :: p in index && x in index[p] ==> x in s && x.personId == p)
  }

  /** Every assignment of `s` is in the index under its person. */
  ghost predicate IndexComplete(s: seq<Assignment>, index: Index)
  {
    forall x :: x in s ==> x.personId in index && x in index[x.personId]
  }

  /**
    groupAssignmentsByUser: each assignment filed under its person and its
    id, a later copy of an id replacing the earlier one in place. When the
    copies of an id agree, every input assignment is in the index.
   */
  function GroupAssignmentsByUser(s: seq<Assignment>): (index: Index)
    ensures IndexSound(s, index)
    ensures Consistent(s) ==> IndexComplete(s, index)
  {
    if s == [] then map[]
    else
      var prefix := s[..|s| - 1];
      var a := s[|s| - 1];
      var g := GroupAssignmentsByUser(prefix);
      GroupStepSound(s, prefix, a, g);
      var r := g[a.personId := Upsert(Lookup(g, a.personId), a)];
      assert Consistent(s) ==> IndexComplete(s, r) by {
        if Consistent(s) {
          ConsistentPrefix(prefix, a);
          GroupStepComplete(s, prefix, a, g);
        }
      }
      r
  }

  /** One step of groupAssignmentsByUser keeps the index sound. */
  lemma GroupStepSound(s: seq<Assignment>, prefix: seq<Assignment>, a: Assignment, g: Index)
    requires s == prefix + [a]
    requires IndexSound(prefix, g)
    ensures UniqueIds(Lookup(g, a.personId))
    ensures IndexSound(s, g[a.personId := Upsert(Lookup(g, a.personId), a)])
  {
    var r := g[a.personId := Upsert(Lookup(g, a.personId), a)];
    UpsertContents(Lookup(g, a.personId), a);
    forall q, y | q in r && y in r[q] ensures y in s && y.personId == q {
      if q == a.personId {
        assert y == a || y in Lookup(g, a.personId);
      } else {
        assert q in g && y in g[q];
      }
    }
  }

  /** One step of groupAssignmentsByUser keeps every assignment seen so far in the index. */
  lemma GroupStepComplete(s: seq<Assignment>, prefix: seq<Assignment>, a: Assignment, g: Index)
    requires s == prefix + [a]
    requires IndexSound(prefix, g)
    requires Consistent(s)
    requires IndexComplete(prefix, g)
    ensures IndexComplete(s, g[a.personId := Upsert(Lookup(g, a.personId), a)])
  {
    var r := g[a.personId := Upsert(Lookup(g, a.personId), a)];
    assert UniqueIds(Lookup(g, a.personId));
    UpsertContents(Lookup(g, a.personId), a);
    forall x | x in s ensures x.personId in r && x in r[x.personId] {
      if x != a {
        var i :| 0 <= i < |s| && s[i] == x;
        assert i < |prefix|;
        assert x in prefix by { assert prefix[i] == x; }
        assert x.id != a.id by { assert s[|s| - 1] == a; }
      }
    }
  }

  /** A sub-list of consistent assignments is consistent. */
  lemma ConsistentPrefix(prefix: seq<Assignment>, a: Assignment)
    requires Consistent(prefix + [a])
    ensures Consistent(prefix)
  {
    var s := prefix + [a];
    forall i, j | 0 <= i < |prefix| && 0 <= j < |prefix| && prefix[i].id == prefix[j].id
      ensures prefix[i] == prefix[j] {
      assert prefix[i] == s[i] && prefix[j] == s[j];
    }
  }

  // ----- splitting an assignment around one day -----

  /**
    Where splitAssignment moves the bounds: the updated assignment, and the
    interval of the assignment it creates after the split day, if any.
   */
  datatype SplitPlan = SplitPlan(updated: Assignment, tail: Option<(Day, Day)>)

  /** The day lies in the interval of the updated assignment or of the created one. */
  predicate InPlan(plan: SplitPlan, k: Day)
  {
    || plan.updated.startDate <= k <= plan.updated.endDate
    || (plan.tail.Some? && plan.tail.value.0 <= k <= plan.tail.value.1)
  }

  /**
    Split at the start: the start moves to the next weekday. At the end: the
    end moves to the previous weekday. Inside: the assignment ends on the
    weekday before the split day and a new one runs from the weekday after
    it to the old end. The split day itself is never covered afterwards,
    and, when the day lies in the assignment, every other weekday of the
    assignment still is, and nothing outside it is.
   */
  function SplitPieces(a: Assignment, splitOn: Day): (plan: SplitPlan)
    ensures plan.updated.id == a.id && plan.updated.personId == a.personId
    ensures plan.updated.projectId == a.projectId && plan.updated.allocation == a.allocation
    ensures !InPlan(plan, splitOn)
    ensures a.startDate <= splitOn <= a.endDate ==>
              forall k :: a.startDate <= k <= a.endDate && k != splitOn && !IsWeekend(k) ==> InPlan(plan, k)
    ensures a.startDate <= splitOn <= a.endDate ==>
              forall k :: InPlan(plan, k) ==> a.startDate <= k <= a.endDate
    ensures a.startDate <= splitOn <= a.endDate ==> (plan.tail.Some? <==> a.startDate < splitOn < a.endDate)
    ensures splitOn != a.startDate ==> plan.updated.startDate == a.startDate
    ensures splitOn == a.startDate ==> plan.updated.endDate == a.endDate
    ensures plan.tail.Some? ==> plan.tail.value.1 == a.endDate && plan.updated.endDate < splitOn < plan.tail.value.0
  {
    if a.startDate == splitOn then SplitPlan(a.(startDate := NextWorkday(a.startDate)), None)
    else if a.endDate == splitOn then SplitPlan(a.(endDate := PrevWorkday(a.endDate)), None)
    else SplitPlan(a.(endDate := PrevWorkday(splitOn)), Some((NextWorkday(splitOn), a.endDate)))
  }

  /**
    When a multi-day assignment starts and ends on weekdays, splitting it at
    one of its days leaves well-formed intervals (start <= end).
   */
  lemma SplitKeepsIntervalsWellFormed(a: Assignment, splitOn: Day)
    requires a.startDate < a.endDate
    requires a.startDate <= splitOn <= a.endDate
    requires !IsWeekend(a.startDate) && !IsWeekend(a.endDate)
    ensures SplitPieces(a, splitOn).updated.startDate <= SplitPieces(a, splitOn).updated.endDate
    ensures SplitPieces(a, splitOn).tail.Some? ==>
              SplitPieces(a, splitOn).tail.value.0 <= SplitPieces(a, splitOn).tail.value.1
  {
  }

  /**
    Without weekday bounds the split can invert an interval: an assignment
    from Friday 1970-01-02 (day 1) to Sunday 1970-01-04 (day 3) split on its
    Friday gets the start Monday (day 4), after its end.
   */
  lemma SplitOfWeekendEndedAssignmentInverts()
    ensures var plan := SplitPieces(Assignment(0, 0, 0, 1, 3, 0), 1);
      plan.updated.startDate == 4 && plan.updated.endDate == 3
  {
    assert IsWeekend(2) && IsWeekend(3) && !IsWeekend(4);
  }
}
